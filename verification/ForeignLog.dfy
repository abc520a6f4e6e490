/** Replay of any log: a journal that another JBD2 writer has left, with any number of transactions, with
    UUIDs behind its tags, with deleted and escaped blocks, and with a last transaction that may lack its
    commit block (kernel/fs/ext4.c:2384-2449). */
module ForeignLog {
  import opened Words
  import opened Bytes
  import opened Journal
  import opened JournalRecovery

  /** A logged block: its home, its copy in the log, and its tag's flags. A UUID follows the tag unless
      the tag repeats the one before. */
  datatype Record = Record(target: nat, copy: Block, escaped: bool, deleted: bool, uuid: Block)

  type Txn = seq<Record>

  ghost predicate RecordOk(g: Geometry, r: Record) {
    r.target < U32 && !InJournal(g, r.target) && |r.copy| == g.bs && (r.uuid == [] || |r.uuid| == 16)
  }

  ghost predicate TxnOk(g: Geometry, t: Txn) {
    t != [] && forall i | 0 <= i < |t| :: RecordOk(g, t[i])
  }

  // ----- the descriptor block

  function FlagsOf(r: Record, last: bool): (fl: nat)
    ensures fl < 16
  {
    (if r.escaped then 1 else 0) + (if r.uuid == [] then 2 else 0) + (if r.deleted then 4 else 0)
    + if last then 8 else 0
  }

  function TagBytes(r: Record, last: bool): Block
    requires r.target < U32
  {
    PutBe32(r.target) + [0, 0, 0, FlagsOf(r, last)] + r.uuid
  }

  function TagsOf(t: Txn): Block
    requires forall i | 0 <= i < |t| :: t[i].target < U32
  {
    if t == [] then [] else TagBytes(t[0], |t| == 1) + TagsOf(t[1..])
  }

  function ViewOf(r: Record, last: bool): TagView { TagView(r.target, r.escaped, r.uuid == [], r.deleted, last) }

  function ViewsOf(t: Txn): (vs: seq<TagView>)
    ensures |vs| == |t|
  {
    if t == [] then [] else [ViewOf(t[0], |t| == 1)] + ViewsOf(t[1..])
  }

  lemma TagIs(a: Block, r: Record, last: bool, c: Block)
    requires r.target < U32
    ensures var b := a + TagBytes(r, last) + c;
            |a| + 8 <= |b| && ReadTag(b, |a|) == ViewOf(r, last)
  {
    hide PutBe32, Be32, Be16, FlagsOf;
    var b, fl := a + TagBytes(r, last) + c, FlagsOf(r, last);
    TagWords(a, r, last, c);
    FlagsRead(r, last);
  }

  lemma TagWords(a: Block, r: Record, last: bool, c: Block)
    requires r.target < U32
    ensures var b := a + TagBytes(r, last) + c;
            |a| + 8 <= |b| && Be32(b, |a|) == r.target && Be16(b, |a| + 6) == FlagsOf(r, last)
  {
    hide PutBe32, Be32, FlagsOf;
    var b, fl := a + TagBytes(r, last) + c, FlagsOf(r, last);
    var rest := [0, 0, 0, fl] + r.uuid + c;
    Be32At(a, r.target, rest);
    assert b == a + PutBe32(r.target) + rest;
    assert b[|a| + 6] == 0 && b[|a| + 7] == fl;
  }

  lemma FlagsRead(r: Record, last: bool)
    ensures var fl := FlagsOf(r, last);
            (fl % 2 == 1 <==> r.escaped) && (fl % 4 >= 2 <==> r.uuid == [])
            && (fl % 8 >= 4 <==> r.deleted) && (fl % 16 >= 8 <==> last)
  {
  }

  lemma TagListStep(b: Block, off: nat, v: TagView)
    requires off + 8 <= |b| && ReadTag(b, off) == v
    ensures TagList(b, off) ==
            if v.last then [v] else [v] + TagList(b, off + if v.sameUuid then 8 else 24)
  {
    hide ReadTag;
  }

  /** Reading the tags of any transaction gives them back, with and without UUIDs between them. */
  lemma {:induction false} TagsParse(g: Geometry, a: Block, t: Txn, c: Block)
    requires TxnOk(g, t)
    ensures TagList(a + TagsOf(t) + c, |a|) == ViewsOf(t)
    decreases |t|
  {
    hide ReadTag, TagList, InJournal, TagBytes;
    var b, r, last := a + TagsOf(t) + c, t[0], |t| == 1;
    var rest := TagsOf(t[1..]) + c;
    assert RecordOk(g, r);
    assert b == a + TagBytes(r, last) + rest;
    TagIs(a, r, last, rest);
    TagListStep(b, |a|, ViewOf(r, last));
    if last {
      assert ViewsOf(t[1..]) == [];
    } else {
      var a' := a + TagBytes(r, last);
      TagsParse(g, a', t[1..], c);
      assert b == a' + TagsOf(t[1..]) + c;
      assert |TagBytes(r, last)| == 8 + |r.uuid| by { TagLength(r, last); }
    }
  }

  lemma TagLength(r: Record, last: bool)
    requires r.target < U32
    ensures |TagBytes(r, last)| == 8 + |r.uuid|
  {
  }

  // ----- the log

  /** Log block j can be read and holds v. */
  ghost predicate At(g: Geometry, d: Device, j: nat, v: Block) {
    j < g.maxlen && Phys(g, j) != 0 && Has(d, Phys(g, j), v)
  }

  /** Log block j is a header block of the kind and number. */
  ghost predicate HeaderAt(g: Geometry, d: Device, j: nat, kind: nat, s: nat) {
    j < g.maxlen && Phys(g, j) != 0 && Phys(g, j) in d.blocks && IsHeader(d.blocks[Phys(g, j)], kind, s)
  }

  ghost predicate CopiesAt(g: Geometry, d: Device, t: Txn, j: nat) {
    forall i | 0 <= i < |t| :: At(g, d, j + i, t[i].copy)
  }

  /** The descriptor block at j starts with header and tags of t. */
  ghost predicate DescriptorAt(g: Geometry, d: Device, t: Txn, j: nat, s: nat)
    requires TxnOk(g, t)
  {
    && s < U32 && j < g.maxlen && Phys(g, j) != 0 && Phys(g, j) in d.blocks
    && var v := d.blocks[Phys(g, j)];
       var start := Header(DESCRIPTOR, s) + TagsOf(t);
       |v| == g.bs && start <= v
  }

  ghost predicate TxnAt(g: Geometry, d: Device, t: Txn, j: nat, s: nat) {
    TxnOk(g, t) && DescriptorAt(g, d, t, j, s) && CopiesAt(g, d, t, j + 1)
  }

  /** From block j the log holds the committed transactions txns, then tail without its commit block, or
      no transaction if tail is empty. */
  ghost predicate LogIs(g: Geometry, d: Device, txns: seq<Txn>, tail: Txn, j: nat, s: nat)
    decreases |txns|
  {
    if txns != [] then
      && TxnAt(g, d, txns[0], j, s) && HeaderAt(g, d, j + 1 + |txns[0]|, COMMIT, s)
      && LogIs(g, d, txns[1..], tail, j + 2 + |txns[0]|, Add32(s, 1))
    else if tail != [] then TxnAt(g, d, tail, j, s) && !HeaderAt(g, d, j + 1 + |tail|, COMMIT, s)
    else !HeaderAt(g, d, j, DESCRIPTOR, s)
  }

  /** The block that a record stands for: its first word is put back if it was escaped. */
  function Original(r: Record): Block {
    if r.escaped && |r.copy| >= 4 then [0xC0, 0x3B, 0x39, 0x98] + r.copy[4..] else r.copy
  }

  /** The home writes of a transaction: every record in order, without the deleted ones. */
  function Effects(t: Txn): seq<Write> {
    if t == [] then []
    else (if t[0].deleted then [] else [Blk(t[0].target, Original(t[0]))]) + Effects(t[1..])
  }

  function AllEffects(txns: seq<Txn>): seq<Write> {
    if txns == [] then [] else Effects(txns[0]) + AllEffects(txns[1..])
  }

  // ----- home writes leave the log alone

  /** Home writes only. */
  ghost predicate Outside(g: Geometry, ws: seq<Write>) {
    forall i | 0 <= i < |ws| :: ws[i].Blk? && !InJournal(g, ws[i].b)
  }

  ghost predicate SameLog(g: Geometry, d: Device, d': Device) {
    forall j: nat | j < g.maxlen && Phys(g, j) != 0 ::
      (Phys(g, j) in d.blocks <==> Phys(g, j) in d'.blocks)
      && (Phys(g, j) in d.blocks ==> d.blocks[Phys(g, j)] == d'.blocks[Phys(g, j)])
  }

  lemma {:induction false} OutsideKeeps(g: Geometry, d: Device, ws: seq<Write>)
    requires Outside(g, ws)
    ensures SameLog(g, d, PutAll(d, ws))
    decreases |ws|
  {
    hide Phys;
    if ws != [] {
      assert ws[0].Blk? && !InJournal(g, ws[0].b);
      assert SameLog(g, d, Put(d, ws[0]));
      OutsideKeeps(g, Put(d, ws[0]), ws[1..]);
    }
  }

  lemma {:induction false} EffectsOutside(g: Geometry, t: Txn)
    requires forall i | 0 <= i < |t| :: RecordOk(g, t[i])
    ensures Outside(g, Effects(t))
    decreases |t|
  {
    hide InJournal;
    if t != [] {
      assert RecordOk(g, t[0]);
      EffectsOutside(g, t[1..]);
    }
  }

  lemma SameTxn(g: Geometry, d: Device, d': Device, t: Txn, j: nat, s: nat)
    requires SameLog(g, d, d') && TxnAt(g, d, t, j, s)
    ensures TxnAt(g, d', t, j, s)
  {
    hide Phys, TagsOf, Header, RecordOk;
    forall i | 0 <= i < |t|
      ensures At(g, d', j + 1 + i, t[i].copy)
    {
      assert At(g, d, j + 1 + i, t[i].copy);
    }
  }

  lemma {:induction false} SameLogIs(g: Geometry, d: Device, d': Device, txns: seq<Txn>, tail: Txn, j: nat, s: nat)
    requires SameLog(g, d, d') && LogIs(g, d, txns, tail, j, s)
    ensures LogIs(g, d', txns, tail, j, s)
    decreases |txns|
  {
    hide TxnAt, Phys, IsHeader;
    if txns != [] {
      SameTxn(g, d, d', txns[0], j, s);
      SameLogIs(g, d, d', txns[1..], tail, j + 2 + |txns[0]|, Add32(s, 1));
    } else if tail != [] {
      SameTxn(g, d, d', tail, j, s);
    }
  }

  // ----- replay

  lemma RestoredIs(r: Record)
    ensures Restored(r.copy, r.escaped) == Original(r)
  {
  }

  lemma ScanStep(g: Geometry, d: Device, r: Record, last: bool, rest: seq<TagView>, n: nat, log: nat)
    requires At(g, d, log + 1 + n, r.copy)
    ensures var w := Effects([r]);
            var x := Scan(g, PutAll(d, w), rest, n + 1, log);
            Scan(g, d, [ViewOf(r, last)] + rest, n, log) == (w + x.0, x.1)
  {
    hide Phys;
    RestoredIs(r);
    hide Restored, Original;
    assert Effects([r][1..]) == [];
    var tags := [ViewOf(r, last)] + rest;
    assert tags[1..] == rest;
    assert TagWrite(g, d, tags[0], Phys(g, log + 1 + n)) == Effects([r]);
  }

  lemma EffectsFirst(t: Txn)
    requires t != []
    ensures Effects(t) == Effects([t[0]]) + Effects(t[1..])
  {
    hide Original;
    var one := [t[0]];
    assert one[1..] == [] && Effects(one[1..]) == [];
    var w := if t[0].deleted then [] else [Blk(t[0].target, Original(t[0]))];
    assert Effects(one) == w + [] == w;
  }

  /** The tag loop issues the home writes of a transaction, n of whose records are behind it. */
  lemma {:induction false} ScanIs(g: Geometry, d: Device, t: Txn, n: nat, log: nat)
    requires (forall i | 0 <= i < |t| :: RecordOk(g, t[i])) && CopiesAt(g, d, t, log + 1 + n)
    ensures Scan(g, d, ViewsOf(t), n, log) == (Effects(t), n + |t|)
    decreases |t|
  {
    hide Phys, RecordOk, Scan, Effects;
    if t == [] {
      ScanNone(g, d, n, log);
    } else {
      var w := Effects([t[0]]);
      assert At(g, d, log + 1 + n + 0, t[0].copy);
      ScanStep(g, d, t[0], |t| == 1, ViewsOf(t[1..]), n, log);
      EffectsFirst(t);
      EffectsOutside(g, [t[0]]);
      OutsideKeeps(g, d, w);
      forall i | 0 <= i < |t[1..]|
        ensures At(g, PutAll(d, w), log + 1 + (n + 1) + i, t[1..][i].copy)
      {
        assert At(g, d, log + 1 + n + (i + 1), t[i + 1].copy);
      }
      ScanIs(g, PutAll(d, w), t[1..], n + 1, log);
    }
  }

  lemma ScanNone(g: Geometry, d: Device, n: nat, log: nat)
    ensures Scan(g, d, [], n, log) == ([], n) && Effects([]) == []
  {
  }

  /** Replay of one transaction: its home writes; then the rest of the log if its commit block is there. */
  lemma ReplayTxn(g: Geometry, d: Device, t: Txn, j: nat, s: nat)
    requires TxnAt(g, d, t, j, s)
    ensures var d' := PutAll(d, Effects(t));
            ReplayFrom(g, d, j, s) ==
            if !HeaderAt(g, d', j + 1 + |t|, COMMIT, s) then (Effects(t), s)
            else
              var r := ReplayFrom(g, d', j + 2 + |t|, Add32(s, 1));
              (Effects(t) + r.0, r.1)
  {
    hide Phys, RecordOk, Scan, Effects, TagList, Header, TagsOf, IsHeader;
    var v := d.blocks[Phys(g, j)];
    DescriptorReads(g, v, t, s);
    ScanIs(g, d, t, 0, j);
  }

  lemma DescriptorReads(g: Geometry, v: Block, t: Txn, s: nat)
    requires TxnOk(g, t) && s < U32 && Header(DESCRIPTOR, s) + TagsOf(t) <= v
    ensures IsHeader(v, DESCRIPTOR, s) && TagList(v, 12) == ViewsOf(t)
  {
    hide TagsOf, TagList, Header, IsHeader, InJournal;
    var h, tags := Header(DESCRIPTOR, s), TagsOf(t);
    var c := v[|h + tags|..];
    assert v == h + tags + c;
    HeaderRead(DESCRIPTOR, s, tags + c);
    assert v == h + (tags + c);
    TagsParse(g, h, t, c);
  }

  /** Replay of any log issues the home writes of all its transactions in order, the one without a commit
      block included, and counts the committed ones. */
  lemma {:induction false} ReplayIs(g: Geometry, d: Device, txns: seq<Txn>, tail: Txn, j: nat, s: nat)
    requires LogIs(g, d, txns, tail, j, s) && s < U32
    ensures ReplayFrom(g, d, j, s) == (AllEffects(txns) + Effects(tail), (s + |txns|) % U32)
    decreases |txns|
  {
    hide TxnAt, HeaderAt, Effects, AllEffects, ReplayFrom, PutAll, Add32;
    if txns == [] && tail == [] {
      ReplayNone(g, d, j, s);
    } else if txns == [] {
      ReplayTail(g, d, tail, j, s);
      EffectsJoin(txns, tail);
    } else {
      var t := txns[0];
      Counts(s, |txns|);
      TxnParts(g, d, t, j, s);
      ReplayTxn(g, d, t, j, s);
      var d' := PutAll(d, Effects(t));
      SameLogIs(g, d, d', txns, tail, j, s);
      ReplayIs(g, d', txns[1..], tail, j + 2 + |t|, Add32(s, 1));
      EffectsJoin(txns, tail);
    }
  }

  lemma ReplayTail(g: Geometry, d: Device, t: Txn, j: nat, s: nat)
    requires s < U32 && TxnAt(g, d, t, j, s) && !HeaderAt(g, d, j + 1 + |t|, COMMIT, s)
    ensures ReplayFrom(g, d, j, s) == (Effects(t), s)
  {
    hide TxnAt, Phys, Effects, ReplayFrom, IsHeader;
    TxnParts(g, d, t, j, s);
    ReplayTxn(g, d, t, j, s);
  }

  lemma ReplayNone(g: Geometry, d: Device, j: nat, s: nat)
    requires !HeaderAt(g, d, j, DESCRIPTOR, s) && s < U32
    ensures ReplayFrom(g, d, j, s) == ([], s) && AllEffects([]) + Effects([]) == [] && s % U32 == s
  {
  }

  lemma TxnParts(g: Geometry, d: Device, t: Txn, j: nat, s: nat)
    requires TxnAt(g, d, t, j, s)
    ensures SameLog(g, d, PutAll(d, Effects(t)))
  {
    EffectsOutside(g, t);
    OutsideKeeps(g, d, Effects(t));
  }

  /** Replay stays with the committed transactions if and only if the transaction without a commit block
      would write nothing. */
  lemma CommittedOnlyIff(g: Geometry, d: Device, txns: seq<Txn>, tail: Txn, j: nat, s: nat)
    requires LogIs(g, d, txns, tail, j, s) && s < U32
    ensures ReplayFrom(g, d, j, s).0 == AllEffects(txns) <==> forall r | r in tail :: r.deleted
  {
    hide LogIs, ReplayFrom;
    ReplayIs(g, d, txns, tail, j, s);
    NoEffectsIff(tail);
  }

  lemma {:induction false} NoEffectsIff(t: Txn)
    ensures Effects(t) == [] <==> forall r | r in t :: r.deleted
    decreases |t|
  {
    if t != [] {
      NoEffectsIff(t[1..]);
      assert t == [t[0]] + t[1..];
    }
  }

  lemma EffectsJoin(txns: seq<Txn>, tail: Txn)
    ensures AllEffects(txns) + Effects(tail) ==
            if txns == [] then Effects(tail) else Effects(txns[0]) + (AllEffects(txns[1..]) + Effects(tail))
  {
    hide Effects;
  }

  lemma Counts(s: nat, n: nat)
    requires s < U32 && n > 0
    ensures Add32(s, 1) < U32 && (Add32(s, 1) + (n - 1)) % U32 == (s + n) % U32
  {
    if s + 1 >= U32 {
      assert (n - 1 + U32) % U32 == (n - 1) % U32;
    }
  }
}
