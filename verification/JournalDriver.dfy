/** The journal code as it runs: the transaction arrays, the page a descriptor is built in, and
    the loops of `txn_commit` and `ext4_journal_replay` (kernel/fs/ext4.c:189-322, 2350-2453),
    proved to issue exactly the write sequences of `Journal`. */
module JournalDriver {
  import opened Words
  import opened Bytes
  import opened Memory
  import opened Journal
  import JournalRecovery
  import opened JournalRuns

  const PAGE := 4096

  /** `wr_be32` into a page. */
  method PutWord(a: array<Byte>, o: nat, v: nat)
    requires o + 4 <= a.Length && v < U32
    modifies a
    ensures a[..] == old(a[..o]) + PutBe32(v) + old(a[o + 4..])
  {
    var w := PutBe32(v);
    a[o], a[o + 1], a[o + 2], a[o + 3] := w[0], w[1], w[2], w[3];
    assert a[..] == a[..o] + a[o..o + 4] + a[o + 4..];
    assert a[o..o + 4] == w;
  }

  /** The three header words at the start of a zeroed page. */
  method NewHeader(bs: nat, kind: nat, s: nat) returns (a: array<Byte>)
    requires bs >= 12 && kind < U32 && s < U32
    ensures fresh(a) && a[..] == Header(kind, s) + Zeros(bs - 12)
  {
    a := new Byte[bs](_ => 0);
    hide PutBe32, Be32;
    assert a[..] == Zeros(bs);
    PutWord(a, 0, MAGIC);
    assert a[..] == PutBe32(MAGIC) + Zeros(bs - 4);
    PutWord(a, 4, kind);
    assert a[..] == PutBe32(MAGIC) + PutBe32(kind) + Zeros(bs - 8);
    PutWord(a, 8, s);
    assert a[..] == PutBe32(MAGIC) + PutBe32(kind) + PutBe32(s) + Zeros(bs - 12);
  }

  /** Place tag i in a descriptor page. */
  method PutTag(a: array<Byte>, o: nat, b: nat, fl: nat)
    requires o + 8 <= a.Length && b < U32 && fl < 256
    modifies a
    ensures a[..] == old(a[..o]) + Tag(b, fl) + old(a[o + 8..])
  {
    hide PutBe32, Be32;
    PutWord(a, o, b);
    assert forall k | 0 <= k < o :: a[k] == old(a[k]);
    assert forall k | 0 <= k < 4 :: a[o + k] == PutBe32(b)[k];
    a[o + 4], a[o + 5], a[o + 6], a[o + 7] := 0, 0, 0, fl;
    ghost var want := old(a[..o]) + Tag(b, fl) + old(a[o + 8..]);
    assert forall k | o + 8 <= k < a.Length :: a[k] == old(a[k]);
    assert forall k | 0 <= k < a.Length :: a[k] == want[k];
  }

  // ----- the loops of replay against their functions

  /** With acc written and the device at d, the tag loop has tags left. */
  ghost predicate ScanLeft(g: Geometry, d0: Device, all: seq<TagView>, log: nat, acc: seq<Write>, d: Device,
                           tags: seq<TagView>, n: nat) {
    var r := Scan(g, d, tags, n, log);
    Scan(g, d0, all, 0, log) == (acc + r.0, r.1)
  }

  lemma ScanStarts(g: Geometry, d0: Device, all: seq<TagView>, log: nat)
    ensures ScanLeft(g, d0, all, log, [], d0, all, 0)
  {
    var r := Scan(g, d0, all, 0, log);
    assert [] + r.0 == r.0;
  }

  lemma ScanEnds(g: Geometry, d0: Device, all: seq<TagView>, log: nat, acc: seq<Write>, d: Device, tags: seq<TagView>,
                 n: nat)
    requires ScanLeft(g, d0, all, log, acc, d, tags, n) && (tags == [] || Phys(g, log + 1 + n) == 0)
    ensures Scan(g, d0, all, 0, log) == (acc, n)
  {
    assert acc + [] == acc;
  }

  lemma ScanTurns(g: Geometry, d0: Device, all: seq<TagView>, log: nat, acc: seq<Write>, d: Device, tags: seq<TagView>,
                  n: nat)
    requires ScanLeft(g, d0, all, log, acc, d, tags, n) && tags != [] && Phys(g, log + 1 + n) != 0
    ensures var w := TagWrite(g, d, tags[0], Phys(g, log + 1 + n));
            ScanLeft(g, d0, all, log, acc + w, PutAll(d, w), tags[1..], n + 1)
  {
    var w := TagWrite(g, d, tags[0], Phys(g, log + 1 + n));
    var r := Scan(g, PutAll(d, w), tags[1..], n + 1, log);
    assert acc + (w + r.0) == acc + w + r.0;
  }

  /** With acc written and the device at d, the transaction loop continues at log with s and
      comes to goal. */
  ghost predicate ReplayLeft(g: Geometry, goal: (seq<Write>, nat), acc: seq<Write>, d: Device, log: nat, s: nat) {
    var r := ReplayFrom(g, d, log, s);
    goal == (acc + r.0, r.1)
  }

  lemma ReplayEnds(g: Geometry, goal: (seq<Write>, nat), acc: seq<Write>, d: Device, log: nat, s: nat)
    requires ReplayLeft(g, goal, acc, d, log, s)
    requires var pb := Phys(g, log);
             log >= g.maxlen || pb == 0 || pb !in d.blocks || |d.blocks[pb]| != g.bs
               || !IsHeader(d.blocks[pb], DESCRIPTOR, s)
    ensures goal == (acc, s)
  {
    hide Scan, TagList, Be32, PhysIn, PutAll;
    assert acc + [] == acc;
  }

  lemma ReplayTurns(g: Geometry, goal: (seq<Write>, nat), acc: seq<Write>, d: Device, log: nat, s: nat)
    requires ReplayLeft(g, goal, acc, d, log, s) && log < g.maxlen
    requires var pb := Phys(g, log);
             pb != 0 && pb in d.blocks && |d.blocks[pb]| == g.bs && IsHeader(d.blocks[pb], DESCRIPTOR, s)
    ensures var (ws, n) := Scan(g, d, TagList(d.blocks[Phys(g, log)], 12), 0, log);
            var d', log' := PutAll(d, ws), log + 1 + n;
            var cb := Phys(g, log');
            if log' >= g.maxlen || cb == 0 || cb !in d'.blocks || !IsHeader(d'.blocks[cb], COMMIT, s)
            then goal == (acc + ws, s)
            else ReplayLeft(g, goal, acc + ws, d', log' + 1, Add32(s, 1))
  {
    hide Scan, TagList, Be32, PhysIn, PutAll;
    var (ws, n) := Scan(g, d, TagList(d.blocks[Phys(g, log)], 12), 0, log);
    var r := ReplayFrom(g, PutAll(d, ws), log + 2 + n, Add32(s, 1));
    assert acc + (ws + r.0) == acc + ws + r.0;
  }

  /** What a mount has to come to, as the goal of the loop. */
  lemma MountGoal(g: Geometry, d: Device) returns (goal: (seq<Write>, nat))
    requires d.start != 0
    ensures ReplayLeft(g, goal, [], d, d.start, d.seq_)
    ensures MountWrites(g, d) == (goal.0 + [Sb(0, goal.1)], goal.1)
  {
    goal := ReplayFrom(g, d, d.start, d.seq_);
    assert [] + goal.0 == goal.0;
  }

  class Driver {
    const g: Geometry
    const journal: bool
    var dev: Device
    /** `t_blk`, `t_buf`, `t_cnt`. */
    var txn: Op
    /** `j_seq`. */
    var seq_: nat
    ghost var issued: seq<Write>

    constructor (g: Geometry, journal: bool, dev: Device)
      ensures this.g == g && this.journal == journal && this.dev == dev && txn == [] && seq_ == dev.seq_ && issued == []
    {
      this.g, this.journal, this.dev := g, journal, dev;
      txn, seq_, issued := [], dev.seq_, [];
    }

    /** One device write. */
    method Write(w: Write)
      modifies this`dev, this`issued
      ensures dev == Put(old(dev), w) && issued == old(issued) + [w]
      ensures forall d, ws | old(dev) == PutAll(d, ws) :: dev == PutAll(d, ws + [w])
    {
      dev, issued := Put(dev, w), issued + [w];
      forall d, ws | old(dev) == PutAll(d, ws)
        ensures dev == PutAll(d, ws + [w])
      {
        JournalRecovery.PutAllLast(d, ws, w);
      }
    }

    /** `txn_add`: a copy of the block in a zeroed page of its own, so that the caller may reuse its
        buffer before the commit. */
    method TxnAdd(b: nat, buf: array<Byte>) returns (rc: int)
      requires g.bs <= buf.Length && g.bs <= PAGE
      modifies this`txn
      ensures |old(txn)| >= TXN_MAX ==> rc == -1 && txn == old(txn)
      ensures |old(txn)| < TXN_MAX ==> rc == 0 && txn == old(txn) + [(b, buf[..g.bs])]
    {
      if |txn| >= TXN_MAX {
        return -1;
      }
      var page := new Byte[PAGE](_ => 0);
      Copy(page, 0, buf[..g.bs]);
      assert page[..g.bs] == page[0..0 + g.bs];
      txn := txn + [(b, page[..g.bs])];
      rc := 0;
    }

    /** `ext4_store_block`: whatever an abandoned transaction left behind, the device gets exactly the
        writes of the one-block transaction with the buffer's contents at the call. */
    method StoreBlock(b: nat, buf: array<Byte>) returns (rc: int)
      requires GeometryOk(g) && g.bs <= buf.Length && g.bs <= PAGE && b < U32 && seq_ < U32
      modifies this`dev, this`txn, this`seq_, this`issued
      ensures rc == 0 && txn == [] && seq_ == if journal then Add32(old(seq_), 1) else old(seq_)
      ensures var ws := StoreWrites(Config(journal, false), g, [(b, buf[..g.bs])], old(seq_));
              issued == old(issued) + ws && dev == PutAll(old(dev), ws)
    {
      txn := [];
      rc := TxnAdd(b, buf);
      assert txn == [(b, buf[..g.bs])];
      rc := TxnCommit();
    }

    /** The descriptor block, built tag by tag in a page. */
    method BuildDescriptor(s: nat) returns (v: Block)
      requires GeometryOk(g) && OpShape(g, txn) && s < U32
      ensures v == Descriptor(g, txn, s)
    {
      hide Be32, Le32, PutBe32, Escaped, Header;
      var jb := NewHeader(g.bs, DESCRIPTOR, s);
      ghost var d := Descriptor(g, txn, s);
      var off := 12;
      for i := 0 to |txn|
        invariant off == 12 + 8 * i && jb.Length == g.bs && fresh(jb)
        invariant jb[..off] == d[..off]
        invariant jb[off..] == Zeros(g.bs - off)
      {
        TagsAt(txn, 0, i);
        assert d[off..off + 8] == Tags(txn, 0)[8 * i..8 * i + 8];
        PutTag(jb, off, txn[i].0, Flags(txn, i));
        assert jb[..off + 8] == d[..off] + d[off..off + 8];
        off := off + 8;
      }
      assert d[off..] == Zeros(g.bs - off);
      assert jb[..] == jb[..off] + jb[off..];
      assert d == d[..off] + d[off..];
      v := jb[..];
    }

    /** `txn_commit`: the writes are `StoreWrites`, in that order. */
    method TxnCommit() returns (rc: int)
      requires GeometryOk(g) && (txn == [] || OpShape(g, txn)) && seq_ < U32
      modifies this`dev, this`txn, this`seq_, this`issued
      ensures rc == 0 && txn == []
      ensures var ws := StoreWrites(Config(journal, false), g, old(txn), old(seq_));
              issued == old(issued) + ws && dev == PutAll(old(dev), ws)
      ensures seq_ == if old(txn) == [] || !journal then old(seq_) else Add32(old(seq_), 1)
    {
      hide LogWrites, PhysIn, Put;
      rc := 0;
      if txn == [] {
        return;
      }
      if journal {
        var s := seq_;
        WriteLog(s);
        Write(Sb(g.first, s));
        ghost var ws := LogWrites(g, txn, s) + [Sb(g.first, s)];
        assert dev == PutAll(old(dev), ws);
        WriteHome(old(dev), ws);
        Write(Sb(0, Add32(s, 1)));
        seq_ := Add32(s, 1);
        assert issued == old(issued) + (ws + HomeWrites(txn) + [Sb(0, Add32(s, 1))]);
      } else {
        WriteHome(dev, []);
        assert [] + HomeWrites(txn) == HomeWrites(txn);
      }
      txn := [];
    }

    /** The descriptor, the data blocks and the commit block. */
    method WriteLog(s: nat)
      requires GeometryOk(g) && OpShape(g, txn) && s < U32
      modifies this`dev, this`issued
      ensures issued == old(issued) + LogWrites(g, txn, s) && dev == PutAll(old(dev), LogWrites(g, txn, s))
    {
      hide Be32, Le32, PutBe32, Tags, Header, PhysIn;
      var n := |txn|;
      ghost var ws := LogWrites(g, txn, s);
      assert ws[..0] == [];
      var jb := BuildDescriptor(s);
      WriteLogBlock(0, jb, s, dev, issued);
      for i := 0 to n
        invariant issued == old(issued) + ws[..i + 1] && dev == PutAll(old(dev), ws[..i + 1])
      {
        var db := if Escaped(txn[i].1) then [0, 0, 0, 0] + txn[i].1[4..] else txn[i].1;
        WriteLogBlock(1 + i, db, s, old(dev), old(issued));
      }
      var cb := NewHeader(g.bs, COMMIT, s);
      WriteLogBlock(1 + n, cb[..], s, old(dev), old(issued));
      assert ws[..n + 2] == ws;
    }

    method WriteLogBlock(i: nat, v: Block, ghost s: nat, ghost d0: Device, ghost issued0: seq<Write>)
      requires GeometryOk(g) && OpShape(g, txn) && s < U32 && i <= |txn| + 1 && v == LogBlock(g, txn, s, i)
      requires dev == PutAll(d0, LogWrites(g, txn, s)[..i]) && issued == issued0 + LogWrites(g, txn, s)[..i]
      modifies this`dev, this`issued
      ensures dev == PutAll(d0, LogWrites(g, txn, s)[..i + 1]) && issued == issued0 + LogWrites(g, txn, s)[..i + 1]
    {
      JournalRecovery.LogWritesStep(g, txn, s, i);
      hide LogWrites, LogBlock;
      Write(Blk(Phys(g, g.first + i), v));
    }

    method WriteHome(ghost d0: Device, ghost ws0: seq<Write>)
      requires dev == PutAll(d0, ws0)
      modifies this`dev, this`issued
      ensures issued == old(issued) + HomeWrites(txn) && dev == PutAll(d0, ws0 + HomeWrites(txn))
    {
      ghost var ws := HomeWrites(txn);
      assert ws0 + ws[..0] == ws0;
      for i := 0 to |txn|
        invariant issued == old(issued) + ws[..i] && dev == PutAll(d0, ws0 + ws[..i])
      {
        Write(Blk(txn[i].0, txn[i].1));
        assert ws[..i + 1] == ws[..i] + [ws[i]];
        assert ws0 + ws[..i + 1] == ws0 + ws[..i] + [ws[i]];
      }
      assert ws[..|txn|] == ws;
    }

    /** The tag loop of replay on the descriptor jb at log block log. */
    method ReplayTags(jb: Block, log: nat) returns (n: nat, ghost acc: seq<Write>)
      requires |jb| == g.bs
      modifies this`dev, this`issued
      ensures (acc, n) == Scan(g, old(dev), TagList(jb, 12), 0, log)
      ensures dev == PutAll(old(dev), acc) && issued == old(issued) + acc
    {
      hide Be32, Be16, PhysIn, ReadTag, ScanLeft, Scan;
      var off, done := 12, false;
      n, acc := 0, [];
      ghost var d0, all := dev, TagList(jb, 12);
      ghost var tags := all;
      ScanStarts(g, d0, all, log);
      while off + 8 <= g.bs && !done
        invariant dev == PutAll(d0, acc) && issued == old(issued) + acc
        invariant ScanLeft(g, d0, all, log, acc, dev, tags, n)
        invariant tags == if done then [] else TagList(jb, off)
        decreases if done then 0 else 1, g.bs - off
      {
        var t := ReadTag(jb, off);
        var dp := Phys(g, log + 1 + n);
        if dp == 0 {
          ScanEnds(g, d0, all, log, acc, dev, tags, n);
          return;
        }
        ScanTurns(g, d0, all, log, acc, dev, tags, n);
        ghost var ws := ReplayTag(t, dp, d0, acc);
        acc, n := acc + ws, n + 1;
        tags := tags[1..];
        done := t.last;
        if !done {
          off := if t.sameUuid then off + 8 else off + 24;
        }
      }
      ScanEnds(g, d0, all, log, acc, dev, tags, n);
    }

    /** Copy one journalled block home. */
    method ReplayTag(t: TagView, dp: nat, ghost d0: Device, ghost acc: seq<Write>) returns (ghost ws: seq<Write>)
      requires dev == PutAll(d0, acc)
      modifies this`dev, this`issued
      ensures ws == TagWrite(g, old(dev), t, dp) && dev == PutAll(old(dev), ws) && dev == PutAll(d0, acc + ws)
      ensures issued == old(issued) + ws
    {
      var db := Read(dev, dp, g.bs);
      if t.escaped {
        db := Restored(db, true);
      }
      ws := [];
      assert acc + [] == acc;
      if !t.deleted {
        ws := [Blk(t.target, db)];
        assert [] + ws == ws && dev == PutAll(dev, []);
        Write(Blk(t.target, db));
      }
    }

    /** `ext4_journal_replay`: the writes and the sequence number are those of `MountWrites`. */
    method Replay()
      modifies this`dev, this`issued, this`seq_
      ensures var (ws, s) := MountWrites(g, old(dev));
              issued == old(issued) + ws && dev == PutAll(old(dev), ws) && seq_ == s
    {
      seq_ := dev.seq_;
      if dev.start == 0 {
        return;
      }
      ghost var goal := MountGoal(g, dev);
      ghost var acc;
      ghost var d0 := dev;
      seq_, acc := ReplayLoop(goal);
      JournalRecovery.PutAllLast(d0, acc, Sb(0, seq_));
      Write(Sb(0, seq_));
    }

    /** The transaction loop. */
    method ReplayLoop(ghost goal: (seq<Write>, nat)) returns (s: nat, ghost acc: seq<Write>)
      requires ReplayLeft(g, goal, [], dev, dev.start, dev.seq_)
      modifies this`dev, this`issued
      ensures goal == (acc, s) && dev == PutAll(old(dev), acc) && issued == old(issued) + acc
    {
      hide ReplayFrom, ReplayLeft;
      var log, go := dev.start, true;
      s, acc := dev.seq_, [];
      ghost var d0 := dev;
      while go && log < g.maxlen
        invariant dev == PutAll(d0, acc) && issued == old(issued) + acc
        invariant if go then ReplayLeft(g, goal, acc, dev, log, s) else goal == (acc, s)
        decreases if go then 1 else 0, g.maxlen - log
      {
        ghost var ws;
        go, log, s, ws := ReplayTxn(log, s, d0, acc, goal);
        acc := acc + ws;
      }
      if go {
        ReplayEnds(g, goal, acc, dev, log, s);
      }
    }

    /** One turn of the transaction loop: false when it breaks out. */
    method ReplayTxn(log: nat, s: nat, ghost d0: Device, ghost acc: seq<Write>, ghost goal: (seq<Write>, nat))
      returns (go: bool, log': nat, s': nat, ghost ws: seq<Write>)
      requires log < g.maxlen && dev == PutAll(d0, acc) && ReplayLeft(g, goal, acc, dev, log, s)
      modifies this`dev, this`issued
      ensures dev == PutAll(d0, acc + ws) && issued == old(issued) + ws
      ensures go ==> ReplayLeft(g, goal, acc + ws, dev, log', s') && log' > log
      ensures !go ==> goal == (acc + ws, s')
    {
      hide Scan, TagList, Be32, PhysIn, PutAll, ReplayFrom, ReplayLeft;
      go, log', s', ws := false, log, s, [];
      assert acc + [] == acc;
      var pb := Phys(g, log);
      if pb == 0 || pb !in dev.blocks || |dev.blocks[pb]| != g.bs || !IsHeader(dev.blocks[pb], DESCRIPTOR, s) {
        ReplayEnds(g, goal, acc, dev, log, s);
        return;
      }
      ReplayTurns(g, goal, acc, dev, log, s);
      var n;
      n, ws := ReplayTags(dev.blocks[pb], log);
      JournalRecovery.PutAllConcat(d0, acc, ws);
      log' := log + 1 + n;
      var cb := Phys(g, log');
      go := log' < g.maxlen && cb != 0 && cb in dev.blocks && IsHeader(dev.blocks[cb], COMMIT, s);
      if go {
        s', log' := Add32(s, 1), log' + 1;
      }
    }
  }
}
